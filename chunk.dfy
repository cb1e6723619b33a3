/**
 * `process_chunk` on one chunk as a pure function of the state before it:
 * the match of `/([\d;]*)m([\s\S]*)/` (unanchored, so the leftmost place a
 * run of digits and semicolons is followed by `m`), the split of the
 * parameter run on `;`, the codes applied in order, and the rendering.
 */
module ChunkParser {
  import opened Wrappers
  import opened Strings
  import opened Sgr

  /** A character of the class `[\d;]` (JavaScript's `\d` is ASCII only). */
  predicate IsCodeChar(c: char) { IsDigit(c) || c == ';' }

  /** The regex matches from `p`: a `[\d;]` run from `p` to `q`, then `m` at `q`. */
  ghost predicate MatchAt(text: string, p: nat, q: nat)
  {
    p <= q < |text| && text[q] == 'm' && forall i :: p <= i < q ==> IsCodeChar(text[i])
  }

  /** The position of the first `c` in `s`. */
  function FirstIndex(s: string, c: char): (r: Option<nat>)
    ensures r.None? <==> c !in s
    ensures r.Some? ==> r.value < |s| && s[r.value] == c && c !in s[..r.value]
  {
    if s == [] then None
    else if s[0] == c then Some(0)
    else match FirstIndex(s[1..], c)
      case None => None
      case Some(i) => (assert s[..i + 1] == [s[0]] + s[1..][..i]; Some(i + 1))
  }

  /** The start of the maximal `[\d;]` run that ends at `q`. */
  function RunStart(s: string, q: nat): (p: nat)
    requires q <= |s|
    ensures p <= q
    ensures forall i :: p <= i < q ==> IsCodeChar(s[i])
    ensures p == 0 || !IsCodeChar(s[p - 1])
    decreases q
  {
    if q == 0 || !IsCodeChar(s[q - 1]) then q else RunStart(s, q - 1)
  }

  /**
   * Where the regex matches: `Some((p, q))` with the parameter run
   * `text[p..q]` and the `m` at `q`, or `None` when the text has no `m`.
   * The `m` is the first one and the run is maximal to the left.
   */
  function FindSgr(text: string): (r: Option<(nat, nat)>)
    ensures r.None? <==> 'm' !in text
    ensures r.Some? ==> MatchAt(text, r.value.0, r.value.1)
    ensures r.Some? ==> 'm' !in text[..r.value.1]
    ensures r.Some? ==> r.value.0 == 0 || !IsCodeChar(text[r.value.0 - 1])
  {
    match FirstIndex(text, 'm')
    case None => None
    case Some(q) => Some((RunStart(text, q), q))
  }

  /** The match `FindSgr` reports is the leftmost one, as JavaScript's `match` returns it. */
  lemma FindSgrIsLeftmost(text: string, p: nat, q: nat)
    requires FindSgr(text).Some?
    requires MatchAt(text, p, q)
    ensures FindSgr(text).value.0 <= p
    ensures p == FindSgr(text).value.0 ==> q == FindSgr(text).value.1
  {
  }

  /** The parsed parameters: `split(';')` then `parseInt` on each piece. */
  function Tokens(codes: string): (r: seq<Option<nat>>)
    ensures |r| >= 1
  {
    var parts := SplitOn(codes, ';');
    seq(|parts|, i requires 0 <= i < |parts| => ParseInt(parts[i]))
  }

  /** A `;` splits the parameter list: the tokens on each side, in order. */
  lemma TokensAroundSep(a: string, b: string)
    ensures Tokens(a + [';'] + b) == Tokens(a) + Tokens(b)
  {
    SplitOnAroundSep(a, b, ';');
  }

  /** The decimal notation of `n` parses as the single code `n`. */
  lemma TokensOfNumber(n: nat)
    ensures Tokens(DecimalString(n)) == [Some(n)]
  {
    var d := DecimalString(n);
    forall i | 0 <= i < |d| ensures d[i] != ';' {
      assert IsDigit(d[i]);
    }
    SplitOnJoin([d], ';');
    ParseIntOfDecimal(n);
  }

  /**
   * `process_chunk(text)` from state `st`: the returned text and the new
   * state. Without an `m` the chunk comes back verbatim and the state is
   * untouched.
   */
  function Chunk(st: Attrs, text: string): (r: (string, Attrs))
    ensures r == (text, st) || exists k :: 0 < k <= |text| && r.0 == Render(r.1, text[k..])
  {
    match FindSgr(text)
    case None => (text, st)
    case Some((p, q)) =>
      var after := Steps(st, Tokens(text[p..q]));
      (Render(after, text[q + 1..]), after)
  }

  /** `process_chunk` keeps the engine's state well formed. */
  lemma ChunkPreservesWellFormed(st: Attrs, text: string)
    requires WellFormed(st)
    ensures WellFormed(Chunk(st, text).1)
  {
    match FindSgr(text)
    case None =>
    case Some((p, q)) => StepsPreservesWellFormed(st, Tokens(text[p..q]));
  }

  /** A chunk with a match: the codes between `p` and `q` applied, the text after `q` rendered. */
  lemma ChunkAtMatch(st: Attrs, text: string, p: nat, q: nat)
    requires FindSgr(text) == Some((p, q))
    ensures q < |text|
    ensures Chunk(st, text) == (Render(Steps(st, Tokens(text[p..q])), text[q + 1..]), Steps(st, Tokens(text[p..q])))
  {
  }

  /** A chunk with no `m` is returned as it is and changes nothing. */
  lemma ChunkWithoutM(st: Attrs, text: string)
    requires 'm' !in text
    ensures Chunk(st, text) == (text, st)
  {
  }

  /**
   * A chunk `junk + codes + "m" + body`, where the junk holds no `m` and does
   * not end in a digit or `;`: only `codes` are applied and only `body` is
   * emitted; the junk is lost.
   */
  lemma ChunkParts(st: Attrs, junk: string, codes: string, body: string)
    requires 'm' !in junk
    requires junk == [] || !IsCodeChar(junk[|junk| - 1])
    requires forall i :: 0 <= i < |codes| ==> IsCodeChar(codes[i])
    ensures var after := Steps(st, Tokens(codes));
      Chunk(st, junk + codes + "m" + body) == (Render(after, body), after)
  {
    var text := junk + codes + "m" + body;
    var q := |junk| + |codes|;
    assert text[q] == 'm';
    assert 'm' !in text[..q] by {
      assert text[..q] == junk + codes;
      forall i | 0 <= i < |codes| ensures codes[i] != 'm' {
        assert IsCodeChar(codes[i]);
      }
    }
    forall i | |junk| <= i < q ensures IsCodeChar(text[i]) {
      assert text[i] == codes[i - |junk|];
    }
    if |junk| > 0 {
      assert text[|junk| - 1] == junk[|junk| - 1];
      assert !IsCodeChar(text[|junk| - 1]);
    }
    var (p0, q0) := FindSgr(text).value;
    assert q0 == q;
    assert p0 == |junk|;
    assert text[p0..q0] == codes;
    assert text[q0 + 1..] == body;
  }

  /** A trailing `;` makes an empty last parameter, which resets everything. */
  lemma TrailingSemicolonResets(st: Attrs, codes: string)
    ensures Steps(st, Tokens(codes + ";")) == Reset
  {
    assert codes + ";" == codes + [';'] + [];
    SplitOnAroundSep(codes, [], ';');
    var t := Tokens(codes + ";");
    assert t[|t| - 1] == ParseInt([]);
  }

  /** A bare `m` resets everything. */
  lemma BareMResets(st: Attrs)
    ensures Steps(st, Tokens("")) == Reset
  {
    var t := Tokens("");
    assert t == [None];
    assert t[..0] == [];
  }

  /** Two adjacent `;` make an empty parameter: whatever came before them is forgotten. */
  lemma DoubledSemicolonResets(st: Attrs, a: string, b: string)
    ensures Steps(st, Tokens(a + ";;" + b)) == Steps(Reset, Tokens(b))
  {
    var s := a + ";;" + b;
    var left := SplitOn(a, ';');
    var tl := seq(|left|, i requires 0 <= i < |left| => ParseInt(left[i]));
    assert SplitOn(s, ';') == left + [[]] + SplitOn(b, ';') by {
      assert s == a + [';'] + ([';'] + b);
      SplitOnAroundSep(a, [';'] + b, ';');
      assert [';'] + b == [] + [';'] + b;
      SplitOnAroundSep([], b, ';');
    }
    assert Tokens(s) == tl + [None] + Tokens(b);
    ResetForgetsHistory(st, tl, None, Tokens(b));
  }
}
