/** The line formats of the solvers are regular expressions of one shape:
    literal text interleaved with capturing groups `(c*)` over a character
    class `c`, matched against the whole line. A `Pattern` spells such an
    expression out; `Match` is the matcher and `Fill` the inverse that writes a
    line from its groups. */
module Template {
  import opened Common
  import opened Decimal

  /** The character classes the solvers' expressions use. */
  datatype CharClass =
    | Digits        // \d
    | SignedNumber  // [ \-\d]
    | Words         // [a-zA-Z0-9 #]

  predicate InClass(k: CharClass, c: char)
  {
    match k
    case Digits => IsDigit(c)
    case SignedNumber => c == ' ' || c == '-' || IsDigit(c)
    case Words => ('a' <= c <= 'z') || ('A' <= c <= 'Z') || IsDigit(c) || c == ' ' || c == '#'
  }

  predicate AllIn(k: CharClass, s: string)
  {
    forall i :: 0 <= i < |s| ==> InClass(k, s[i])
  }

  /** An expression, read from left to right: the end of the line, literal
      text followed by the rest, or a group `(k*)` followed by the rest. */
  datatype Pattern =
    | End
    | Text(text: string, next: Pattern)
    | Capture(kind: CharClass, next: Pattern)

  /** The classes of the pattern's groups, in order. */
  function Classes(p: Pattern): seq<CharClass>
  {
    match p
    case End => []
    case Text(_, next) => Classes(next)
    case Capture(k, next) => [k] + Classes(next)
  }

  /** Each captured group lies in its group's class. */
  predicate GroupsFit(ks: seq<CharClass>, gs: seq<string>)
  {
    |ks| == |gs| && forall i :: 0 <= i < |gs| ==> AllIn(ks[i], gs[i])
  }

  /** A group is never followed directly by another group, nor by literal
      text that starts with a character of the group's class; this is what
      makes the greedy match of each group the only match. */
  predicate Separated(p: Pattern)
  {
    match p
    case End => true
    case Text(_, next) => Separated(next)
    case Capture(k, next) =>
      (next.End? || (next.Text? && |next.text| > 0 && !InClass(k, next.text[0])))
      && Separated(next)
  }

  /** The length of the longest prefix of `s` that lies in class `k`. */
  function SpanLength(k: CharClass, s: string): (n: nat)
    ensures n <= |s| && AllIn(k, s[..n])
    ensures n < |s| ==> !InClass(k, s[n])
  {
    if |s| > 0 && InClass(k, s[0]) then
      var n := 1 + SpanLength(k, s[1..]);
      assert s[..n] == [s[0]] + s[1..][..n - 1];
      n
    else 0
  }

  /** The line written by a pattern and the text of its groups. */
  function Fill(p: Pattern, gs: seq<string>): string
    requires |gs| == |Classes(p)|
  {
    match p
    case End => ""
    case Text(t, next) => t + Fill(next, gs)
    case Capture(_, next) => gs[0] + Fill(next, gs[1..])
  }

  /** `Pattern.matcher(s).matches()` with the groups it captures: each group
      takes the longest run of its class, each literal must follow, and the
      whole line must be consumed. */
  function Match(p: Pattern, s: string): (r: Option<seq<string>>)
    ensures r.Some? ==> GroupsFit(Classes(p), r.value)
  {
    match p
    case End => if |s| == 0 then Some([]) else None
    case Text(t, next) => if t <= s then Match(next, s[|t|..]) else None
    case Capture(k, next) =>
      var n := SpanLength(k, s);
      match Match(next, s[n..])
      case Some(gs) => Some([s[..n]] + gs)
      case None => None
  }

  /** The lines an expression accepts: exactly those written by `Fill`. */
  ghost predicate Accepts(p: Pattern, s: string)
  {
    exists gs :: GroupsFit(Classes(p), gs) && s == Fill(p, gs)
  }

  /** What the matcher captures writes the line back. */
  lemma {:induction false} MatchSound(p: Pattern, s: string)
    requires Match(p, s).Some?
    ensures s == Fill(p, Match(p, s).value)
  {
    match p
    case End =>
    case Text(t, next) =>
      MatchSound(next, s[|t|..]);
    case Capture(k, next) =>
      var n := SpanLength(k, s);
      MatchSound(next, s[n..]);
      assert s == s[..n] + s[n..];
  }

  /** A greedy run stops exactly where a run of the class is followed by a
      character outside it. */
  lemma SpanOfRun(k: CharClass, g: string, rest: string)
    requires AllIn(k, g)
    requires |rest| == 0 || !InClass(k, rest[0])
    ensures SpanLength(k, g + rest) == |g|
  {
    var s := g + rest;
    var n := SpanLength(k, s);
    assert forall i :: 0 <= i < |g| ==> InClass(k, s[i]) by {
      assert forall i :: 0 <= i < |g| ==> s[i] == g[i];
    }
    assert |g| < |s| ==> !InClass(k, s[|g|]) by {
      assert |g| < |s| ==> s[|g|] == rest[0];
    }
    assert forall i :: 0 <= i < n ==> InClass(k, s[i]) by {
      assert forall i :: 0 <= i < n ==> s[..n][i] == s[i];
    }
  }

  /** On a separated pattern the matcher recovers the groups of every line
      the pattern writes. */
  lemma {:induction false} MatchComplete(p: Pattern, gs: seq<string>)
    requires Separated(p)
    requires GroupsFit(Classes(p), gs)
    ensures Match(p, Fill(p, gs)) == Some(gs)
  {
    match p
    case End =>
    case Text(t, next) =>
      var s := Fill(p, gs);
      assert s[|t|..] == Fill(next, gs);
      MatchComplete(next, gs);
    case Capture(k, next) =>
      var rest := gs[1..];
      assert GroupsFit(Classes(next), rest) by {
        forall i | 0 <= i < |rest| ensures AllIn(Classes(next)[i], rest[i]) {
          assert Classes(p)[i + 1] == Classes(next)[i];
        }
      }
      var s := Fill(p, gs);
      var tail := Fill(next, rest);
      if next.Text? {
        assert tail == next.text + Fill(next.next, rest);
        assert tail[0] == next.text[0];
      }
      assert AllIn(k, gs[0]) by {
        assert Classes(p)[0] == k;
      }
      SpanOfRun(k, gs[0], tail);
      assert s[..|gs[0]|] == gs[0] && s[|gs[0]|..] == tail;
      MatchComplete(next, rest);
      assert [gs[0]] + rest == gs;
  }

  /** On a separated pattern the matcher succeeds exactly on the lines the
      expression accepts, and the groups it returns are the only ones. */
  lemma MatchExact(p: Pattern, s: string)
    requires Separated(p)
    ensures Match(p, s).Some? <==> Accepts(p, s)
    ensures forall gs :: GroupsFit(Classes(p), gs) && s == Fill(p, gs) ==> Match(p, s) == Some(gs)
  {
    if Match(p, s).Some? {
      MatchSound(p, s);
    }
    forall gs | GroupsFit(Classes(p), gs) && s == Fill(p, gs)
      ensures Match(p, s) == Some(gs)
    {
      MatchComplete(p, gs);
    }
  }
}
