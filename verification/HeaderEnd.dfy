/** The end-of-header automaton that read_until runs over whatever has arrived. */
module HeaderEnd {
  import opened Wrappers

  const CR: char := '\r'
  const LF: char := '\n'

  /** The two counters of the match condition. */
  datatype Match = Match(crlfcrlf: nat, lflf: nat)

  const START := Match(0, 0)

  /** One character: the new counters, or the match (None). */
  function Step(s: Match, c: char): Option<Match> {
    if c == LF then
      if s.crlfcrlf == 3 || s.lflf == 1 then None
      else Some(Match(if s.crlfcrlf == 1 then 2 else if s.crlfcrlf == 2 then 0 else s.crlfcrlf, if s.lflf == 0 then 1 else s.lflf))
    else if c == CR then Some(Match(if s.crlfcrlf == 0 || s.crlfcrlf == 2 then s.crlfcrlf + 1 else 0, 0))
    else Some(Match(0, 0))
  }

  /** Where the scan of a text stops, and whether on a match. */
  datatype Scanned = Found(consumed: nat) | Exhausted(state: Match)

  function Scan(s: Match, text: string): Scanned
    decreases |text|
  {
    if text == [] then Exhausted(s)
    else
      match Step(s, text[0])
      case None => Found(1)
      case Some(next) => Later(Scan(next, text[1..]), 1)
  }

  function Later(r: Scanned, offset: nat): Scanned {
    if r.Found? then Found(r.consumed + offset) else r
  }

  class HeaderEndMatch {
    var crlfcrlf: nat
    var lflf: nat

    constructor ()
      ensures View() == START
    {
      crlfcrlf, lflf := 0, 0;
    }

    function View(): Match
      reads this
    {
      Match(crlfcrlf, lflf)
    }

    /** operator() on one buffer; the counters live on into the next call. */
    method Apply(text: string) returns (it: nat, found: bool)
      modifies this
      ensures found ==> Scan(old(View()), text) == Found(it)
      ensures !found ==> it == |text| && Scan(old(View()), text) == Exhausted(View())
    {
      it := 0;
      while it < |text|
        invariant it <= |text|
        invariant Scan(old(View()), text) == Later(Scan(View(), text[it..]), it)
      {
        if text[it] == LF {
          if crlfcrlf == 1 {
            crlfcrlf := crlfcrlf + 1;
          } else if crlfcrlf == 2 {
            crlfcrlf := 0;
          } else if crlfcrlf == 3 {
            return it + 1, true;
          }
          if lflf == 0 {
            lflf := lflf + 1;
          } else if lflf == 1 {
            return it + 1, true;
          }
        } else if text[it] == CR {
          if crlfcrlf == 0 {
            crlfcrlf := crlfcrlf + 1;
          } else if crlfcrlf == 2 {
            crlfcrlf := crlfcrlf + 1;
          } else {
            crlfcrlf := 0;
          }
          lflf := 0;
        } else {
          crlfcrlf := 0;
          lflf := 0;
        }
        it := it + 1;
      }
      found := false;
    }
  }

  /** Buffer boundaries do not matter. */
  lemma {:induction false} ScanSplit(s: Match, a: string, b: string)
    ensures Scan(s, a + b) == if Scan(s, a).Found? then Scan(s, a) else Later(Scan(Scan(s, a).state, b), |a|)
    decreases |a|
  {
    if a == [] {
      assert a + b == b;
    } else {
      assert (a + b)[1..] == a[1..] + b;
      match Step(s, a[0]) {
        case None =>
        case Some(next) => ScanSplit(next, a[1..], b);
      }
    }
  }

  // ---------------------------------------------------------------------------------------
  // What is recognised
  // ---------------------------------------------------------------------------------------

  predicate EndsWithLfLf(t: string) {
    |t| >= 2 && t[|t| - 2] == LF && t[|t| - 1] == LF
  }

  predicate EndsWithCrLfCrLf(t: string) {
    |t| >= 4 && t[|t| - 4] == CR && t[|t| - 3] == LF && t[|t| - 2] == CR && t[|t| - 1] == LF
  }

  /** An empty line ends here. */
  predicate Terminated(t: string) {
    EndsWithLfLf(t) || EndsWithCrLfCrLf(t)
  }

  /** The number of carriage returns at the end. */
  function CrRun(t: string): nat {
    if t == [] || t[|t| - 1] != CR then 0 else 1 + CrRun(t[..|t| - 1])
  }

  /** The automaton misses an empty line whose first line break follows an even run of carriage returns. */
  predicate Recognised(t: string) {
    EndsWithLfLf(t) || (EndsWithCrLfCrLf(t) && CrRun(t[..|t| - 3]) % 2 == 1)
  }

  /** The counters after a text without a match, read off the text. */
  function CountersAfter(t: string): Match {
    var n := |t|;
    if n == 0 then Match(0, 0)
    else if t[n - 1] == CR then
      if n >= 3 && t[n - 2] == LF && t[n - 3] == CR && CrRun(t[..n - 2]) % 2 == 1 then Match(3, 0)
      else Match(CrRun(t) % 2, 0)
    else if t[n - 1] == LF then Match(if n >= 2 && CrRun(t[..n - 1]) % 2 == 1 then 2 else 0, 1)
    else Match(0, 0)
  }

  lemma StepRecognises(t: string, c: char)
    ensures Step(CountersAfter(t), c) == if Recognised(t + [c]) then None else Some(CountersAfter(t + [c]))
  {
    var n, u := |t|, t + [c];
    assert u[..n] == t;
    if n >= 1 {
      assert u[..n - 1] == t[..n - 1];
    }
    if n >= 2 {
      assert u[..n - 2] == t[..n - 2];
      assert CrRun(t[..n - 1]) == if t[n - 2] == CR then 1 + CrRun(t[..n - 2]) else 0 by {
        assert t[..n - 1][..n - 2] == t[..n - 2];
      }
    }
  }

  ghost predicate NoneRecognised(text: string, from: nat, to: nat)
    requires to <= |text|
  {
    forall k | from < k <= to :: !Recognised(text[..k])
  }

  /** The scan stopped at the first recognised position after `from`, or there is none. */
  ghost predicate StopsAtFirst(text: string, from: nat, r: Scanned) {
    if r.Found? then
      && 0 < r.consumed && from + r.consumed <= |text|
      && Recognised(text[..from + r.consumed]) && NoneRecognised(text, from, from + r.consumed - 1)
    else r.state == CountersAfter(text) && NoneRecognised(text, from, |text|)
  }

  lemma {:induction false} ScanFrom(t: string, rest: string)
    ensures StopsAtFirst(t + rest, |t|, Scan(CountersAfter(t), rest))
    decreases |rest|
  {
    var text := t + rest;
    if rest == [] {
      assert text == t;
    } else {
      var u := t + [rest[0]];
      assert text == u + rest[1..] && text[..|u|] == u;
      StepRecognises(t, rest[0]);
      if !Recognised(u) {
        ScanFrom(u, rest[1..]);
      }
    }
  }

  /** On every text the automaton stops at the first recognised position, or nowhere if there is none. */
  lemma ScanFindsFirst(text: string)
    ensures StopsAtFirst(text, 0, Scan(START, text))
  {
    assert [] + text == text;
    ScanFrom([], text);
  }

  ghost predicate FirstTerminated(text: string, n: nat) {
    && n <= |text| && Terminated(text[..n])
    && forall k: nat | k < n :: !Terminated(text[..k])
  }

  /** It fires at the first empty line exactly when no even run of carriage returns starts that line break. */
  lemma FiresAtFirstExactly(text: string, n: nat)
    requires FirstTerminated(text, n)
    ensures Scan(START, text) == Found(n) <==> EndsWithLfLf(text[..n]) || CrRun(text[..n - 3]) % 2 == 1
  {
    ScanFindsFirst(text);
    assert EndsWithCrLfCrLf(text[..n]) ==> text[..n][..n - 3] == text[..n - 3];
    forall k: nat | k < n ensures !Recognised(text[..k]) {
      assert !Terminated(text[..k]);
    }
  }

  ghost predicate NoAdjacentCr(text: string) {
    forall i | 0 <= i < |text| - 1 :: !(text[i] == CR && text[i + 1] == CR)
  }

  lemma SingleCr(text: string, n: nat)
    requires NoAdjacentCr(text) && n <= |text|
    ensures CrRun(text[..n]) <= 1
  {
    if n >= 2 {
      assert text[..n][..n - 1] == text[..n - 1];
      assert !(text[n - 2] == CR && text[n - 2 + 1] == CR);
    }
  }

  /** Without two adjacent carriage returns it fires at the first empty line there is. */
  lemma FiresAtFirst(text: string, n: nat)
    requires NoAdjacentCr(text) && FirstTerminated(text, n)
    ensures Scan(START, text) == Found(n)
  {
    FiresAtFirstExactly(text, n);
    if !EndsWithLfLf(text[..n]) {
      SingleCr(text, n - 3);
      assert text[..n][n - 4] == text[n - 4] == CR;
      assert text[..n - 3][n - 4] == CR;
    }
  }

  /** A doubled carriage return hides the empty line after it: nothing is found in this text. */
  lemma DoubledCrHidesEnd()
    ensures FirstTerminated("\r\r\n\r\n", 5) && Scan(START, "\r\r\n\r\n") != Found(5)
  {
    var text := "\r\r\n\r\n";
    assert text[..5] == text;
    assert !Terminated(text[..4]) && !Terminated(text[..3]) && !Terminated(text[..2]);
    assert text[..2] == "\r\r" && "\r\r"[..1] == "\r" && "\r"[..0] == "";
    assert CrRun("") == 0 && CrRun("\r") == 1 && CrRun("\r\r") == 2;
    FiresAtFirstExactly(text, 5);
  }
}
