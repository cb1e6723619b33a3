/**
 * `ansi_to_html` as a pure function of the state before it: split the text
 * on the Control Sequence Introducer ESC `[`, keep the first fragment as it
 * is, run every later fragment through `process_chunk` in order and
 * concatenate.
 */
module Chunker {
  import opened Wrappers
  import opened Strings
  import opened Sgr
  import opened ChunkParser

  /** The Control Sequence Introducer: ESC followed by `[`. */
  const Csi: string := ['\U{1B}', '[']

  /** `s` holds no ESC `[` anywhere. */
  predicate CsiFree(s: string)
  {
    forall i :: 0 <= i < |s| - 1 ==> !(s[i] == Csi[0] && s[i + 1] == Csi[1])
  }

  /** JavaScript's `split(/\033\[/)`: the pieces between the occurrences of ESC `[`, left to right. */
  function SplitCsi(s: string): (parts: seq<string>)
    ensures |parts| >= 1
    ensures parts[0] <= s
    ensures forall p :: p in parts ==> CsiFree(p)
    decreases |s|
  {
    if |s| < 2 then [s]
    else if s[..2] == Csi then [""] + SplitCsi(s[2..])
    else
      var r := SplitCsi(s[1..]);
      var first := [s[0]] + r[0];
      assert CsiFree(first) by {
        assert r[0] in r;
        forall i | 0 <= i < |first| - 1 ensures !(first[i] == Csi[0] && first[i + 1] == Csi[1]) {
          if i == 0 {
            assert first[1] == s[1];
            assert s[..2] == [s[0], s[1]];
          } else {
            assert first[i] == r[0][i - 1] && first[i + 1] == r[0][i];
          }
        }
      }
      [first] + r[1..]
  }

  /** Joining the pieces with ESC `[` gives back the text. */
  lemma {:induction false} JoinSplitCsi(s: string)
    ensures Join(SplitCsi(s), Csi) == s
    decreases |s|
  {
    if |s| < 2 {
    } else if s[..2] == Csi {
      JoinSplitCsi(s[2..]);
      var r := SplitCsi(s[2..]);
      JoinCons("", r, Csi);
      assert s == "" + Csi + s[2..];
    } else {
      JoinSplitCsi(s[1..]);
      var r := SplitCsi(s[1..]);
      JoinPrepend(s[0], r, Csi);
      assert s == [s[0]] + s[1..];
    }
  }

  /** Dropping the first character keeps a text free of ESC `[`. */
  lemma CsiFreeTail(s: string)
    requires |s| >= 1 && CsiFree(s)
    ensures CsiFree(s[1..])
  {
    forall i | 0 <= i < |s[1..]| - 1 ensures !(s[1..][i] == Csi[0] && s[1..][i + 1] == Csi[1]) {
      assert s[1..][i] == s[i + 1] && s[1..][i + 1] == s[i + 2];
    }
  }

  /** Text without ESC `[` is a single piece. */
  lemma {:induction false} SplitWithoutCsi(s: string)
    requires CsiFree(s)
    ensures SplitCsi(s) == [s]
    decreases |s|
  {
    if |s| >= 2 {
      assert s[..2] != Csi by { assert s[..2] == [s[0], s[1]]; }
      CsiFreeTail(s);
      SplitWithoutCsi(s[1..]);
      assert [s[0]] + s[1..] == s;
    }
  }

  /** A piece without ESC `[`, then ESC `[` and the rest: the piece, then the pieces of the rest. */
  lemma {:induction false} SplitAroundCsi(a: string, b: string)
    requires CsiFree(a)
    ensures SplitCsi(a + Csi + b) == [a] + SplitCsi(b)
    decreases |a|
  {
    var s := a + Csi + b;
    if a == [] {
      assert s[..2] == Csi;
      assert s[2..] == b;
    } else {
      assert s[1..] == a[1..] + Csi + b;
      assert s[..2] != Csi by {
        if |a| == 1 {
          assert s[1] == Csi[0];
        } else {
          assert s[..2] == [a[0], a[1]];
        }
      }
      CsiFreeTail(a);
      SplitAroundCsi(a[1..], b);
      assert [a[0]] + a[1..] == a;
    }
  }

  /**
   * Runs the pieces through a chunk processor `f` in order, threading the
   * state from `st`, and concatenates what it returns.
   */
  function Thread(f: (Attrs, string) -> (string, Attrs), st: Attrs, cs: seq<string>): (string, Attrs)
    decreases |cs|
  {
    if cs == [] then ("", st)
    else
      var prev := Thread(f, st, cs[..|cs| - 1]);
      var last := f(prev.1, cs[|cs| - 1]);
      (prev.0 + last.0, last.1)
  }

  /** `ansi_to_html(txt)` from state `st`: the HTML and the state afterwards. */
  function Convert(st: Attrs, txt: string): (r: (string, Attrs))
    ensures SplitCsi(txt)[0] <= r.0
  {
    var parts := SplitCsi(txt);
    var rest := Thread(Chunk, st, parts[1..]);
    (parts[0] + rest.0, rest.1)
  }

  /** Threading one more piece continues from the state the earlier ones leave. */
  lemma ThreadSnoc(f: (Attrs, string) -> (string, Attrs), st: Attrs, cs: seq<string>, c: string)
    ensures var prev := Thread(f, st, cs);
      Thread(f, st, cs + [c]) == (prev.0 + f(prev.1, c).0, f(prev.1, c).1)
  {
    assert (cs + [c])[..|cs|] == cs;
  }

  /**
   * One more round of the loop in `ansi_to_html`: output so far and state
   * so far agree with the pieces before index `i`; after running `f` on
   * piece `i` they agree with the pieces up to and including it.
   */
  lemma ThreadStep(f: (Attrs, string) -> (string, Attrs), st: Attrs, parts: seq<string>, i: nat,
                   html: string, out: string, after: Attrs)
    requires 1 <= i < |parts|
    requires html == parts[0] + Thread(f, st, parts[1..i]).0
    requires (out, after) == f(Thread(f, st, parts[1..i]).1, parts[i])
    ensures html + out == parts[0] + Thread(f, st, parts[1..i + 1]).0
    ensures after == Thread(f, st, parts[1..i + 1]).1
  {
    ThreadSnoc(f, st, parts[1..i], parts[i]);
    assert parts[1..i] + [parts[i]] == parts[1..i + 1];
    var prev := Thread(f, st, parts[1..i]);
    assert html + out == parts[0] + (prev.0 + out);
  }

  /** Threading two runs of pieces one after the other is threading them together. */
  lemma {:induction false} ThreadAppend(f: (Attrs, string) -> (string, Attrs), st: Attrs, a: seq<string>, b: seq<string>)
    ensures var m := Thread(f, st, a).1;
      Thread(f, st, a + b) == (Thread(f, st, a).0 + Thread(f, m, b).0, Thread(f, m, b).1)
    decreases |b|
  {
    if b == [] {
      assert a + b == a;
      assert Thread(f, st, a).0 + "" == Thread(f, st, a).0;
    } else {
      var b' := b[..|b| - 1];
      ThreadAppend(f, st, a, b');
      assert (a + b)[..|a + b| - 1] == a + b';
      assert (a + b)[|a + b| - 1] == b[|b| - 1];
      var h1 := Thread(f, st, a).0;
      var h2 := Thread(f, Thread(f, st, a).1, b').0;
      var out := f(Thread(f, Thread(f, st, a).1, b').1, b[|b| - 1]);
      assert (h1 + h2) + out.0 == h1 + (h2 + out.0);
    }
  }

  /** Threading chunks through `process_chunk` keeps the state well formed. */
  lemma {:induction false} ThreadPreservesWellFormed(st: Attrs, cs: seq<string>)
    requires WellFormed(st)
    ensures WellFormed(Thread(Chunk, st, cs).1)
    decreases |cs|
  {
    if cs != [] {
      ThreadPreservesWellFormed(st, cs[..|cs| - 1]);
      ChunkPreservesWellFormed(Thread(Chunk, st, cs[..|cs| - 1]).1, cs[|cs| - 1]);
    }
  }

  /** `ansi_to_html` keeps the state well formed. */
  lemma ConvertPreservesWellFormed(st: Attrs, txt: string)
    requires WellFormed(st)
    ensures WellFormed(Convert(st, txt).1)
  {
    ThreadPreservesWellFormed(st, SplitCsi(txt)[1..]);
  }

  /**
   * From a fresh engine, however many texts are converted in turn, the
   * class list never holds `bright-bg`, and holds `bright-fg` exactly when
   * a bright foreground colour is set.
   */
  lemma {:induction false} NoBrightBackground(txts: seq<string>)
    ensures var st := ConvertAll(Reset, txts);
      WellFormed(st)
      && BrightBg !in ClassList(st)
      && (BrightFg in ClassList(st) <==> st.fg.Some? && st.brightFg)
  {
    if txts != [] {
      NoBrightBackground(txts[..|txts| - 1]);
      ConvertPreservesWellFormed(ConvertAll(Reset, txts[..|txts| - 1]), txts[|txts| - 1]);
    }
    BrightMarkers(ConvertAll(Reset, txts));
  }

  /** The state after `ansi_to_html` is called on each text in turn. */
  function ConvertAll(st: Attrs, txts: seq<string>): Attrs
  {
    if txts == [] then st else Convert(ConvertAll(st, txts[..|txts| - 1]), txts[|txts| - 1]).1
  }

  /** Text without ESC `[` comes out unchanged and the state is untouched. */
  lemma ConvertWithoutCsi(st: Attrs, txt: string)
    requires CsiFree(txt)
    ensures Convert(st, txt) == (txt, st)
  {
    SplitWithoutCsi(txt);
    assert SplitCsi(txt)[1..] == [];
    assert txt + "" == txt;
  }

  /** Text free of ESC `[` after one ESC `[`: the lead verbatim, then the chunk through `process_chunk`. */
  lemma OneChunk(st: Attrs, lead: string, chunk: string)
    requires CsiFree(lead) && CsiFree(chunk)
    ensures Convert(st, lead + Csi + chunk) == (lead + Chunk(st, chunk).0, Chunk(st, chunk).1)
  {
    SplitAroundCsi(lead, chunk);
    SplitWithoutCsi(chunk);
    assert SplitCsi(lead + Csi + chunk)[1..] == [chunk];
    assert [chunk][..0] == [];
    assert Thread(Chunk, st, []) == ("", st);
    assert "" + Chunk(st, chunk).0 == Chunk(st, chunk).0;
  }

  /** Parameters, `m` and text free of ESC `[` make a chunk free of ESC `[`. */
  lemma SequenceChunkCsiFree(codes: string, body: string)
    requires forall i :: 0 <= i < |codes| ==> IsCodeChar(codes[i])
    requires CsiFree(body)
    ensures CsiFree(codes + "m" + body)
  {
    var chunk := codes + "m" + body;
    forall i | 0 <= i < |chunk| - 1 ensures !(chunk[i] == Csi[0] && chunk[i + 1] == Csi[1]) {
      if i < |codes| {
        assert chunk[i] == codes[i] && IsCodeChar(codes[i]);
      } else if i == |codes| {
        assert chunk[i] == 'm';
      } else {
        assert chunk[i] == body[i - |codes| - 1] && chunk[i + 1] == body[i - |codes|];
      }
    }
  }

  /**
   * One escape sequence: `lead`, then ESC `[`, the parameters, `m` and the
   * text it colours. The lead is kept verbatim, the text is rendered with
   * the state after the parameters, and that state is the new one.
   */
  lemma OneSequence(st: Attrs, lead: string, codes: string, body: string)
    requires CsiFree(lead)
    requires forall i :: 0 <= i < |codes| ==> IsCodeChar(codes[i])
    requires CsiFree(body)
    ensures var after := Steps(st, Tokens(codes));
      Convert(st, lead + Csi + (codes + "m" + body)) == (lead + Render(after, body), after)
  {
    var chunk := codes + "m" + body;
    var after := Steps(st, Tokens(codes));
    assert Chunk(st, chunk) == (Render(after, body), after) by {
      assert [] + codes + "m" + body == chunk;
      ChunkParts(st, [], codes, body);
    }
    assert CsiFree(chunk) by {
      SequenceChunkCsiFree(codes, body);
    }
    OneChunk(st, lead, chunk);
  }

  /** The state after `ESC[31m` from the reset state: a red foreground and nothing else. */
  const Red: Attrs := Attrs(Some("console-color-red-fg"), None, false, false, [])

  /** `31` from the reset state sets the red foreground. */
  lemma RedCode()
    ensures Steps(Reset, Tokens("31")) == Red
  {
    SplitOnJoin(["31"], ';');
    ParseIntOfDecimal(31);
    assert DecimalString(31) == "31";
    assert Tokens("31") == [Some(31)];
    assert [Some(31)][..0] == [];
    assert ColorClassName(31 % 10, true) == "console-color-red-fg";
    assert Step(Reset, Some(31)) == Red;
  }

  /** `0` resets whatever state it meets. */
  lemma ZeroCode(st: Attrs)
    ensures Steps(st, Tokens("0")) == Reset
  {
    SplitOnJoin(["0"], ';');
    ParseIntOfDecimal(0);
    assert DecimalString(0) == "0";
    assert Tokens("0") == [Some(0)];
    assert [Some(0)][..0] == [];
  }

  /** A parameter with leading zeros reads as its value, as `parseInt` does. */
  lemma LeadingZeroTokens()
    ensures Tokens("031") == [Some(31)]
  {
    SplitOnJoin(["031"], ';');
    ParseIntOfDigits("031");
    assert DecimalValue("031") == 31 by {
      assert "031"[..2] == "03";
      assert "03"[..1] == "0";
    }
  }

  /** `031` from the reset state sets the red foreground, as `31` does. */
  lemma LeadingZeroCode()
    ensures Steps(Reset, Tokens("031")) == Red
  {
    LeadingZeroTokens();
    RedCode();
    assert Tokens("031") == Tokens("31") by {
      SplitOnJoin(["31"], ';');
      ParseIntOfDecimal(31);
      assert DecimalString(31) == "31";
    }
  }

  /** `1;4;32` parses as the three codes 1, 4 and 32. */
  lemma BoldUnderlineGreenTokens()
    ensures Tokens("1;4;32") == [Some(1), Some(4), Some(32)]
  {
    assert DecimalString(32) == "32" by {
      assert DecimalString(3) == "3";
    }
    assert "1;4;32" == DecimalString(1) + [';'] + (DecimalString(4) + [';'] + DecimalString(32));
    TokensAroundSep(DecimalString(1), DecimalString(4) + [';'] + DecimalString(32));
    TokensAroundSep(DecimalString(4), DecimalString(32));
    TokensOfNumber(1);
    TokensOfNumber(4);
    TokensOfNumber(32);
  }

  /** The state after `1;4;32`: bright, underlined, green. */
  const BoldUnderlineGreen: Attrs := Attrs(Some(ColorClassName(2, true)), None, true, false, [Underline])

  /** `1;4;32` from a fresh engine sets the bright flag, underline and the green foreground. */
  lemma BoldUnderlineGreenCodes()
    ensures Steps(Reset, Tokens("1;4;32")) == BoldUnderlineGreen
  {
    BoldUnderlineGreenTokens();
    StepsOfThree(Reset, Some(1), Some(4), Some(32));
    var s1 := Reset.(brightFg := true);
    assert Step(Reset, Some(1)) == s1;
    var s2 := s1.(styles := [Underline]);
    assert Step(s1, Some(4)) == s2;
    ForegroundCode(s2, 32);
  }

  /** Its classes: the decoration first, then the colour, then the bright marker. */
  lemma BoldUnderlineGreenClasses()
    ensures ClassList(BoldUnderlineGreen) == ["console-style-underline", "console-color-green-fg", "bright-fg"]
  {
    var st := BoldUnderlineGreen;
    assert ColorClassName(2, true) == "console-color-green-fg";
    assert ClassName(Underline) == "console-style-underline";
    assert ClassList(st) == [ClassName(Underline)] + [ColorClassName(2, true)] + [BrightFg];
  }

  /** The red foreground renders as one span with its colour class. */
  lemma RenderRed(text: string)
    ensures Render(Red, text) == "<span class=\"console-color-red-fg\">" + text + "</span>"
  {
    var name := "console-color-red-fg";
    assert Join(ClassList(Red), " ") == name by {
      assert ClassList(Red) == [name];
    }
    assert "<span class=\"" + name + "\">" == "<span class=\"console-color-red-fg\">";
  }

  /** A chunk `31m…` from the reset state: a red span, and the red foreground is the new state. */
  lemma RedChunk(red: string)
    ensures Chunk(Reset, "31m" + red) == ("<span class=\"console-color-red-fg\">" + red + "</span>", Red)
  {
    assert [] + "31" + "m" + red == "31m" + red;
    ChunkParts(Reset, [], "31", red);
    RedCode();
    RenderRed(red);
  }

  /** A chunk `0m…` after red: bare text, and the state is reset. */
  lemma PlainChunk(plain: string)
    ensures Chunk(Red, "0m" + plain) == (plain, Reset)
  {
    assert [] + "0" + "m" + plain == "0m" + plain;
    ChunkParts(Red, [], "0", plain);
    ZeroCode(Red);
  }

  /** Two chunks, each after its own ESC `[`: processed in order, the second from the state the first leaves. */
  lemma TwoChunks(st: Attrs, c1: string, c2: string)
    requires CsiFree(c1) && CsiFree(c2)
    ensures var m := Chunk(st, c1).1;
      Convert(st, Csi + c1 + Csi + c2) == (Chunk(st, c1).0 + Chunk(m, c2).0, Chunk(m, c2).1)
  {
    assert Csi + c1 + Csi + c2 == [] + Csi + (c1 + Csi + c2);
    SplitAroundCsi([], c1 + Csi + c2);
    SplitAroundCsi(c1, c2);
    SplitWithoutCsi(c2);
    assert SplitCsi(Csi + c1 + Csi + c2) == [[]] + ([c1] + [c2]);
    var r1 := Chunk(st, c1);
    var r2 := Chunk(r1.1, c2);
    assert [c1][..0] == [] && [c2][..0] == [];
    assert Thread(Chunk, st, [c1]) == ("" + r1.0, r1.1);
    assert Thread(Chunk, r1.1, [c2]) == ("" + r2.0, r2.1);
    ThreadAppend(Chunk, st, [c1], [c2]);
    assert "" + r1.0 == r1.0 && "" + r2.0 == r2.0;
    assert Thread(Chunk, st, [c1] + [c2]) == (r1.0 + r2.0, r2.1);
    assert [] + (r1.0 + r2.0) == r1.0 + r2.0;
  }

  /**
   * Coloured text, then a reset: `ESC[31m` wraps the text after it in the
   * red foreground span, the text after `ESC[0m` comes out bare, and the
   * state ends at the reset.
   */
  lemma RedThenReset(red: string, plain: string)
    requires CsiFree(red) && CsiFree(plain)
    ensures Convert(Reset, Csi + "31m" + red + Csi + "0m" + plain)
         == ("<span class=\"console-color-red-fg\">" + red + "</span>" + plain, Reset)
  {
    var c1, c2 := "31m" + red, "0m" + plain;
    assert CsiFree(c1) by {
      assert c1 == "31" + "m" + red;
      SequenceChunkCsiFree("31", red);
    }
    assert CsiFree(c2) by {
      assert c2 == "0" + "m" + plain;
      SequenceChunkCsiFree("0", plain);
    }
    var whole := Csi + "31m" + red + Csi + "0m" + plain;
    assert whole == Csi + c1 + Csi + c2;
    TwoChunks(Reset, c1, c2);
    RedChunk(red);
    PlainChunk(plain);
  }
}
