/**
 * The attribute state of one `Ansi_Up` object and what one SGR parameter
 * code does to it (the `if`/`else if` chain of `process_chunk`), plus the
 * class list and the `<span>` the engine renders from that state.
 */
module Sgr {
  import opened Wrappers
  import opened Strings
  import opened StyleList

  const Colors: seq<string> := ["black", "red", "green", "yellow", "blue", "magenta", "cyan", "white"]

  /** `get_color_class_name`: the CSS class of a base colour, foreground or background. */
  function ColorClassName(index: nat, isFg: bool): (r: string)
    requires index < |Colors|
    ensures |r| > 17 && r[..14] == "console-color-"
    ensures r[|r| - 3..] == (if isFg then "-fg" else "-bg")
  {
    "console-color-" + Colors[index] + "-" + (if isFg then "fg" else "bg")
  }

  /** The decoration classes `add_style` is called with, one constructor per class. */
  datatype Decoration =
    | Italic | Underline | DoubleUnderline | BlinkSlow | BlinkFast | Strike | DoubleStrike | Overline

  /** The CSS class name of a decoration. */
  function ClassName(d: Decoration): (r: string)
    ensures |r| > 14 && r[..14] == "console-style-"
  {
    "console-style-" +
    match d
    case Italic => "italic"
    case Underline => "underline"
    case DoubleUnderline => "double-underline"
    case BlinkSlow => "blink-slow"
    case BlinkFast => "blink-fast"
    case Strike => "strike"
    case DoubleStrike => "double-strike"
    case Overline => "overline"
  }

  const BrightFg := "bright-fg"
  const BrightBg := "bright-bg"

  /** The five fields of an `Ansi_Up` object; `None` is the source's `null`. */
  datatype Attrs = Attrs(
    fg: Option<string>,
    bg: Option<string>,
    brightFg: bool,
    brightBg: bool,
    styles: seq<Decoration>)

  /** The state of a fresh engine, and the state every reset code returns to. */
  const Reset: Attrs := Attrs(None, None, false, false, [])

  /** A parsed parameter is a reset when it is empty (`NaN`) or zero. */
  predicate IsReset(code: Option<nat>)
  {
    code.None? || code.value == 0
  }

  /** One pass of the dispatch in `process_chunk` over a parsed parameter. */
  function Step(st: Attrs, code: Option<nat>): (r: Attrs)
    ensures r.brightBg ==> st.brightBg
  {
    if IsReset(code) then Reset
    else
      var n := code.value;
      if n == 1 then st.(brightFg := true)
      else if n == 2 || n == 22 then st.(brightFg := false)
      else if n == 3 then st.(styles := st.styles + [Italic])
      else if n == 4 then st.(styles := RemoveSkip(st.styles, DoubleUnderline) + [Underline])
      else if n == 5 then st.(styles := RemoveSkip(st.styles, BlinkFast) + [BlinkSlow])
      else if n == 6 then st.(styles := RemoveSkip(st.styles, BlinkSlow) + [BlinkFast])
      else if n == 7 || n == 8 then st
      else if n == 9 then st.(styles := RemoveSkip(st.styles, DoubleStrike) + [Strike])
      else if 10 <= n <= 20 then st
      else if n == 21 then st.(styles := RemoveSkip(st.styles, Underline) + [DoubleUnderline])
      else if n == 23 then st.(styles := RemoveSkip(st.styles, Italic))
      else if n == 24 then st.(styles := RemoveEach(st.styles, [Underline, DoubleUnderline]))
      else if n == 25 then st.(styles := RemoveEach(st.styles, [BlinkSlow, BlinkFast]))
      else if n == 27 || n == 28 then st
      else if n == 29 then st.(styles := RemoveEach(st.styles, [Strike, DoubleStrike]))
      else if 30 <= n < 38 then st.(fg := Some(ColorClassName(n % 10, true)))
      else if n == 39 then st.(fg := None)
      else if 40 <= n < 48 then st.(bg := Some(ColorClassName(n % 10, false)), brightBg := false)
      else if n == 48 then st
      else if n == 49 then st.(bg := None)
      else if n == 53 then st.(styles := st.styles + [Overline])
      else if n == 55 then st.(styles := RemoveSkip(st.styles, Overline))
      else if n == 64 then st.(styles := RemoveSkip(st.styles, Strike) + [DoubleStrike])
      else if n == 65 then st.(styles := RemoveEach(st.styles, [Strike, DoubleStrike]))
      else if 90 <= n < 98 then st.(fg := Some(ColorClassName(n % 10, true)), brightFg := true)
      else if 100 <= n < 108 then st.(bg := Some(ColorClassName(n % 10, false)), brightBg := false)
      else st
  }

  /** The parameters of one sequence applied left to right. */
  function Steps(st: Attrs, codes: seq<Option<nat>>): (r: Attrs)
    ensures r.brightBg ==> st.brightBg
  {
    if codes == [] then st else Step(Steps(st, codes[..|codes| - 1]), codes[|codes| - 1])
  }

  /** JavaScript truthiness of an optional class name (`if (self.fg)`). */
  predicate Truthy(o: Option<string>)
  {
    o.Some? && o.value != []
  }

  /** The classes of the rendered span: styles, then fg and its bright marker, then bg and its bright marker. */
  function ClassList(st: Attrs): (cs: seq<string>)
    ensures |st.styles| <= |cs| <= |st.styles| + 4
    ensures cs == [] <==> st.styles == [] && !Truthy(st.fg) && !Truthy(st.bg)
  {
    seq(|st.styles|, i requires 0 <= i < |st.styles| => ClassName(st.styles[i]))
    + (if Truthy(st.fg) then [st.fg.value] + (if st.brightFg then [BrightFg] else []) else [])
    + (if Truthy(st.bg) then [st.bg.value] + (if st.brightBg then [BrightBg] else []) else [])
  }

  /** The text of one chunk as `process_chunk` returns it for the state after its codes. */
  function Render(st: Attrs, text: string): (r: string)
    ensures r == text || (|r| >= |text| + 22 && r[..13] == "<span class=\"" && r[|r| - 7..] == "</span>"
                          && r[|r| - 7 - |text|..|r| - 7] == text)
  {
    var classes := ClassList(st);
    if st.fg.None? && st.bg.None? && |classes| < 1 then text
    else "<span class=\"" + Join(classes, " ") + "\">" + text + "</span>"
  }

  /** `name` is one of the sixteen colour classes of the given side. */
  ghost predicate IsColorClass(name: string, isFg: bool)
  {
    exists i :: 0 <= i < |Colors| && name == ColorClassName(i, isFg)
  }

  /**
   * The states the engine can reach from a fresh object: colours are colour
   * classes of the right side and `bright_bg` is never set.
   */
  ghost predicate WellFormed(st: Attrs)
  {
    && (st.fg.Some? ==> IsColorClass(st.fg.value, true))
    && (st.bg.Some? ==> IsColorClass(st.bg.value, false))
    && !st.brightBg
  }

  /** The eight colour names are pairwise different. */
  lemma ColorNamesDistinct(i: nat, j: nat)
    requires i < |Colors| && j < |Colors| && i != j
    ensures Colors[i] != Colors[j]
  {
    assert Colors[i][0] != Colors[j][0] || |Colors[i]| != |Colors[j]|;
  }

  /** Different colours or sides always give different class names. */
  lemma {:induction false} ColorClassNameInjective(i: nat, f: bool, j: nat, g: bool)
    requires i < |Colors| && j < |Colors|
    ensures ColorClassName(i, f) == ColorClassName(j, g) <==> i == j && f == g
  {
    var a, b := ColorClassName(i, f), ColorClassName(j, g);
    if a == b {
      ColorClassNameParts(i, f);
      ColorClassNameParts(j, g);
      if i != j {
        ColorNamesDistinct(i, j);
      }
    }
  }

  /** The colour word sits between the prefix and the side suffix, whose middle letter names the side. */
  lemma ColorClassNameParts(i: nat, f: bool)
    requires i < |Colors|
    ensures var c := ColorClassName(i, f);
      |c| == |Colors[i]| + 17 && c[14..|c| - 3] == Colors[i] && c[|c| - 2] == (if f then 'f' else 'b')
  {
    var c, w := ColorClassName(i, f), Colors[i];
    var suffix := "-" + (if f then "fg" else "bg");
    assert c == "console-color-" + w + suffix;
    forall k | 0 <= k < |w| ensures c[14 + k] == w[k] {
    }
    assert c[14..|c| - 3] == w;
    assert c[|c| - 2] == suffix[1];
  }

  /** A colour class is long, starts with `c` and holds no space (so it is neither marker nor separator). */
  lemma ColorClassShape(i: nat, f: bool)
    requires i < |Colors|
    ensures var c := ColorClassName(i, f); |c| > 14 && c[0] == 'c' && ' ' !in c
  {
    var c := ColorClassName(i, f);
    assert c == "console-color-" + Colors[i] + (if f then "-fg" else "-bg");
    assert ' ' !in Colors[i];
  }

  /** A decoration class is long, starts with `c` and holds no space. */
  lemma ClassNameShape(d: Decoration)
    ensures var c := ClassName(d); |c| > 14 && c[0] == 'c' && ' ' !in c
  {
  }

  /** Different decorations have different class names, so comparing names is comparing decorations. */
  lemma ClassNameInjective(d: Decoration, e: Decoration)
    ensures ClassName(d) == ClassName(e) <==> d == e
  {
    if ClassName(d) == ClassName(e) {
      var c := ClassName(d);
      assert c[14..] == ClassName(e)[14..];
    }
  }

  /** One code keeps a reachable state reachable. */
  lemma StepPreservesWellFormed(st: Attrs, code: Option<nat>)
    requires WellFormed(st)
    ensures WellFormed(Step(st, code))
  {
    var r := Step(st, code);
    StepForeground(st, code);
    StepBackground(st, code);
    if r.fg.Some? && r.fg != st.fg {
      assert IsColorClass(r.fg.value, true) by {
        assert r.fg.value == ColorClassName(code.value % 10, true);
      }
    }
    if r.bg.Some? && r.bg != st.bg {
      assert IsColorClass(r.bg.value, false) by {
        assert r.bg.value == ColorClassName(code.value % 10, false);
      }
    }
  }

  /** A code leaves the foreground alone, clears it, or sets it to the colour of its last digit. */
  lemma StepForeground(st: Attrs, code: Option<nat>)
    ensures var r := Step(st, code);
      || r.fg == st.fg
      || r.fg.None?
      || (code.Some? && code.value % 10 < 8 && r.fg == Some(ColorClassName(code.value % 10, true)))
  {
  }

  /**
   * A code leaves the background alone, clears it, or sets it to the colour
   * of its last digit; it never sets `bright_bg`.
   */
  lemma StepBackground(st: Attrs, code: Option<nat>)
    ensures var r := Step(st, code);
      && (r.brightBg ==> st.brightBg)
      && (|| r.bg == st.bg
          || r.bg.None?
          || (code.Some? && code.value % 10 < 8 && r.bg == Some(ColorClassName(code.value % 10, false))))
  {
  }

  /** Every state the engine reaches from a fresh object is well formed. */
  lemma {:induction false} StepsPreservesWellFormed(st: Attrs, codes: seq<Option<nat>>)
    requires WellFormed(st)
    ensures WellFormed(Steps(st, codes))
  {
    if codes != [] {
      StepsPreservesWellFormed(st, codes[..|codes| - 1]);
      StepPreservesWellFormed(Steps(st, codes[..|codes| - 1]), codes[|codes| - 1]);
    }
  }

  /** Three codes applied in order. */
  lemma StepsOfThree(st: Attrs, a: Option<nat>, b: Option<nat>, c: Option<nat>)
    ensures Steps(st, [a, b, c]) == Step(Step(Step(st, a), b), c)
  {
    assert [a][..0] == [];
    assert Steps(st, [a]) == Step(st, a);
    assert [a, b][..1] == [a];
    assert Steps(st, [a, b]) == Step(Step(st, a), b);
    assert [a, b, c][..2] == [a, b];
  }

  /** Applying two parameter lists one after the other is applying their concatenation. */
  lemma {:induction false} StepsAppend(st: Attrs, a: seq<Option<nat>>, b: seq<Option<nat>>)
    ensures Steps(st, a + b) == Steps(Steps(st, a), b)
  {
    if b == [] {
      assert a + b == a;
    } else {
      var c := a + b;
      assert c[..|c| - 1] == a + b[..|b| - 1];
      assert c[|c| - 1] == b[|b| - 1];
      StepsAppend(st, a, b[..|b| - 1]);
    }
  }

  /** After a reset parameter the earlier history no longer matters. */
  lemma ResetForgetsHistory(st: Attrs, before: seq<Option<nat>>, r: Option<nat>, after: seq<Option<nat>>)
    requires IsReset(r)
    ensures Steps(st, before + [r] + after) == Steps(Reset, after)
  {
    StepsAppend(st, before + [r], after);
    var b := before + [r];
    assert b[..|b| - 1] == before;
  }

  /** An empty or zero code resets every field, whatever the state. */
  lemma StepReset(st: Attrs, code: Option<nat>)
    requires IsReset(code)
    ensures Step(st, code) == Reset
  {
  }

  /** 1 sets the bright flag, 2 and 22 clear it, 39 clears the foreground, 49 the background. */
  lemma FlagAndClearCodes(st: Attrs)
    ensures Step(st, Some(1)) == st.(brightFg := true)
    ensures Step(st, Some(2)) == Step(st, Some(22)) == st.(brightFg := false)
    ensures Step(st, Some(39)) == st.(fg := None)
    ensures Step(st, Some(49)) == st.(bg := None)
  {
  }

  /** Two resets in a row are one reset. */
  lemma ResetIdempotent(st: Attrs, r1: Option<nat>, r2: Option<nat>)
    requires IsReset(r1) && IsReset(r2)
    ensures Steps(st, [r1, r2]) == Steps(st, [r1]) == Reset
  {
    assert [r1, r2][..1] == [r1];
    assert [r1][..0] == [];
  }

  /** The codes with a branch of their own that changes something. */
  predicate Handled(n: nat)
  {
    n <= 6 || n == 9 || 21 <= n <= 25 || 29 <= n <= 37 || n == 39
    || 40 <= n <= 47 || n == 49 || n == 53 || n == 55 || n == 64 || n == 65
    || 90 <= n <= 97 || 100 <= n <= 107
  }

  /** Codes without an effective branch (7, 8, 10-20, 26-28, 38, 48, 50-52, 54, 56-63, 66-89, 98, 99 and all above 107) change nothing. */
  lemma UnhandledCodesAreNoOps(st: Attrs, n: nat)
    requires !Handled(n)
    ensures Step(st, Some(n)) == st
  {
  }

  /** An exchanging code (remove the partner, then add): the new class ends the list, and the partner stays exactly when two copies of it were adjacent. */
  lemma ExchangeFacts(s: seq<Decoration>, added: Decoration, partner: Decoration)
    requires added != partner
    ensures var r := RemoveSkip(s, partner) + [added];
      r[|r| - 1] == added && (partner in r <==> HasAdjacentPair(s, partner))
  {
    RemoveSkipLeavesKIff(s, partner);
  }

  /**
   * A clearing code (`remove_style([a, b])`): `a` stays exactly when two
   * copies of it were adjacent, `b` exactly when two copies of it were
   * adjacent once `a` was removed; when the two classes never sit next to
   * each other, both go.
   */
  lemma ClearFacts(s: seq<Decoration>, a: Decoration, b: Decoration)
    requires a != b
    ensures var r := RemoveEach(s, [a, b]);
      && (a in r <==> HasAdjacentPair(s, a))
      && (b in r <==> HasAdjacentPair(RemoveSkip(s, a), b))
      && (Separated(s, a, b) ==> a !in r && b !in r)
  {
    RemoveEachPair(s, a, b);
    var once := RemoveSkip(s, a);
    var r := RemoveSkip(once, b);
    RemoveSkipLeavesKIff(s, a);
    RemoveSkipLeavesKIff(once, b);
    RemoveSkipOnlyRemovesK(once, b);
    assert a in r <==> a in Filter(r, b);
    if Separated(s, a, b) {
      RemoveFamily(s, a, b);
    }
  }

  /**
   * The underline family: 4 and 21 exchange underline and double underline,
   * 24 clears both.
   */
  lemma UnderlineFamily(st: Attrs)
    ensures var r := Step(st, Some(4)).styles;
      r[|r| - 1] == Underline && (DoubleUnderline in r <==> HasAdjacentPair(st.styles, DoubleUnderline))
    ensures var r := Step(st, Some(21)).styles;
      r[|r| - 1] == DoubleUnderline && (Underline in r <==> HasAdjacentPair(st.styles, Underline))
    ensures var r := Step(st, Some(24)).styles;
      && (Underline in r <==> HasAdjacentPair(st.styles, Underline))
      && (DoubleUnderline in r <==> HasAdjacentPair(RemoveSkip(st.styles, Underline), DoubleUnderline))
      && (Separated(st.styles, Underline, DoubleUnderline) ==> Underline !in r && DoubleUnderline !in r)
  {
    assert Step(st, Some(4)).styles == RemoveSkip(st.styles, DoubleUnderline) + [Underline];
    assert Step(st, Some(21)).styles == RemoveSkip(st.styles, Underline) + [DoubleUnderline];
    assert Step(st, Some(24)).styles == RemoveEach(st.styles, [Underline, DoubleUnderline]);
    ExchangeFacts(st.styles, Underline, DoubleUnderline);
    ExchangeFacts(st.styles, DoubleUnderline, Underline);
    ClearFacts(st.styles, Underline, DoubleUnderline);
  }

  /** The blink family: 5 and 6 exchange slow and fast blink, 25 clears both. */
  lemma BlinkFamily(st: Attrs)
    ensures var r := Step(st, Some(5)).styles;
      r[|r| - 1] == BlinkSlow && (BlinkFast in r <==> HasAdjacentPair(st.styles, BlinkFast))
    ensures var r := Step(st, Some(6)).styles;
      r[|r| - 1] == BlinkFast && (BlinkSlow in r <==> HasAdjacentPair(st.styles, BlinkSlow))
    ensures var r := Step(st, Some(25)).styles;
      && (BlinkSlow in r <==> HasAdjacentPair(st.styles, BlinkSlow))
      && (BlinkFast in r <==> HasAdjacentPair(RemoveSkip(st.styles, BlinkSlow), BlinkFast))
      && (Separated(st.styles, BlinkSlow, BlinkFast) ==> BlinkSlow !in r && BlinkFast !in r)
  {
    assert Step(st, Some(5)).styles == RemoveSkip(st.styles, BlinkFast) + [BlinkSlow];
    assert Step(st, Some(6)).styles == RemoveSkip(st.styles, BlinkSlow) + [BlinkFast];
    assert Step(st, Some(25)).styles == RemoveEach(st.styles, [BlinkSlow, BlinkFast]);
    ExchangeFacts(st.styles, BlinkSlow, BlinkFast);
    ExchangeFacts(st.styles, BlinkFast, BlinkSlow);
    ClearFacts(st.styles, BlinkSlow, BlinkFast);
  }

  /** The strike family: 9 and 64 exchange strike and double strike. */
  lemma StrikeFamily(st: Attrs)
    ensures var r := Step(st, Some(9)).styles;
      r[|r| - 1] == Strike && (DoubleStrike in r <==> HasAdjacentPair(st.styles, DoubleStrike))
    ensures var r := Step(st, Some(64)).styles;
      r[|r| - 1] == DoubleStrike && (Strike in r <==> HasAdjacentPair(st.styles, Strike))
  {
    assert Step(st, Some(9)).styles == RemoveSkip(st.styles, DoubleStrike) + [Strike];
    assert Step(st, Some(64)).styles == RemoveSkip(st.styles, Strike) + [DoubleStrike];
    ExchangeFacts(st.styles, Strike, DoubleStrike);
    ExchangeFacts(st.styles, DoubleStrike, Strike);
  }

  /** 29 and 65 both clear the strike family, in the same way. */
  lemma StrikeClear(st: Attrs)
    ensures Step(st, Some(29)) == Step(st, Some(65))
    ensures var r := Step(st, Some(29)).styles;
      && (Strike in r <==> HasAdjacentPair(st.styles, Strike))
      && (DoubleStrike in r <==> HasAdjacentPair(RemoveSkip(st.styles, Strike), DoubleStrike))
      && (Separated(st.styles, Strike, DoubleStrike) ==> Strike !in r && DoubleStrike !in r)
  {
    ClearFacts(st.styles, Strike, DoubleStrike);
  }

  /**
   * Italic (3 adds, 23 removes) and overline (53 adds, 55 removes): adding
   * appends even when the class is already there; removing leaves the class
   * exactly when two copies of it were adjacent.
   */
  lemma AddRemoveCodes(st: Attrs)
    ensures Step(st, Some(3)).styles == st.styles + [Italic]
    ensures Step(st, Some(53)).styles == st.styles + [Overline]
    ensures Italic in Step(st, Some(23)).styles <==> HasAdjacentPair(st.styles, Italic)
    ensures Overline in Step(st, Some(55)).styles <==> HasAdjacentPair(st.styles, Overline)
  {
    RemoveSkipLeavesKIff(st.styles, Italic);
    RemoveSkipLeavesKIff(st.styles, Overline);
  }

  /** From a fresh engine, 4 then 21 leaves only double underline, and 21 then 4 only underline. */
  lemma UnderlineSwitches()
    ensures Steps(Reset, [Some(4), Some(21)]).styles == [DoubleUnderline]
    ensures Steps(Reset, [Some(21), Some(4)]).styles == [Underline]
  {
    assert [Some(4), Some(21)][..1] == [Some(4)] && [Some(4)][..0] == [];
    assert [Some(21), Some(4)][..1] == [Some(21)] && [Some(21)][..0] == [];
    assert Steps(Reset, [Some(4)]).styles == [Underline];
    assert Steps(Reset, [Some(21)]).styles == [DoubleUnderline];
  }

  /** `ESC[21;21;4m` leaves both underline classes: the second 21's copy survives the 4. */
  lemma DoubledDoubleUnderlineThenUnderline()
    ensures Steps(Reset, [Some(21), Some(21), Some(4)]).styles == [DoubleUnderline, Underline]
  {
    var c := [Some(21), Some(21), Some(4)];
    assert c[..2] == [Some(21), Some(21)];
    assert c[..2][..1] == [Some(21)];
    assert [Some(21)][..0] == [];
    var s1 := Steps(Reset, [Some(21)]).styles;
    assert s1 == [DoubleUnderline];
    var s2 := Steps(Reset, c[..2]).styles;
    assert s2 == RemoveSkip(s1, Underline) + [DoubleUnderline] == [DoubleUnderline, DoubleUnderline];
    assert RemoveSkip(s2, DoubleUnderline) == [DoubleUnderline];
  }

  /** `ESC[24m` after double-underline, underline, double-underline leaves one double-underline. */
  lemma ClearUnderlineLeavesOne()
    ensures Step(Reset.(styles := [DoubleUnderline, Underline, DoubleUnderline]), Some(24)).styles
            == [DoubleUnderline]
  {
    var s := [DoubleUnderline, Underline, DoubleUnderline];
    RemoveEachPair(s, Underline, DoubleUnderline);
    assert s[1..] == [Underline, DoubleUnderline];
    assert s[1..][2..] == [];
    assert RemoveSkip(s[1..], Underline) == [DoubleUnderline];
    assert RemoveSkip(s, Underline) == [DoubleUnderline, DoubleUnderline];
    assert [DoubleUnderline, DoubleUnderline][2..] == [];
  }

  /** Codes 30-37 and 90-97 pick the colour `n % 10`; only 90-97 set the bright flag. */
  lemma ForegroundCode(st: Attrs, n: nat)
    requires 30 <= n < 38 || 90 <= n < 98
    ensures var r := Step(st, Some(n));
      r.fg == Some(ColorClassName(n % 10, true))
      && (r.brightFg <==> n >= 90 || st.brightFg)
      && r.bg == st.bg && r.brightBg == st.brightBg && r.styles == st.styles
      && ClassList(r)[|st.styles|] == ColorClassName(n % 10, true)
  {
    ColorClassShape(n % 10, true);
  }

  /** Codes 40-47 and 100-107 pick the background colour `n % 10` and clear its bright flag. */
  lemma BackgroundCode(st: Attrs, n: nat)
    requires 40 <= n < 48 || 100 <= n < 108
    ensures var r := Step(st, Some(n));
      r.bg == Some(ColorClassName(n % 10, false)) && !r.brightBg
      && r.fg == st.fg && r.brightFg == st.brightFg && r.styles == st.styles
  {
  }

  /** The chunk's text comes back bare exactly when no colour and no style is set. */
  lemma RenderBareIff(st: Attrs, text: string)
    ensures Render(st, text) == text <==> st.fg.None? && st.bg.None? && st.styles == []
  {
    if !(st.fg.None? && st.bg.None? && |ClassList(st)| < 1) {
      assert |Render(st, text)| > |text|;
    }
  }

  /** The class list is the styles' names, then the foreground part, then the background part. */
  lemma ClassListParts(st: Attrs)
    ensures var cs := ClassList(st);
      (forall i :: 0 <= i < |st.styles| ==> cs[i] == ClassName(st.styles[i]))
      && cs[|st.styles|..] ==
         (if Truthy(st.fg) then [st.fg.value] + (if st.brightFg then [BrightFg] else []) else [])
         + (if Truthy(st.bg) then [st.bg.value] + (if st.brightBg then [BrightBg] else []) else [])
  {
  }

  /** Every colour class has the shape `ColorClassShape` gives. */
  lemma ColorNameShapeOf(name: string, isFg: bool)
    requires IsColorClass(name, isFg)
    ensures |name| > 14 && name[0] == 'c' && ' ' !in name
  {
    var i :| 0 <= i < |Colors| && name == ColorClassName(i, isFg);
    ColorClassShape(i, isFg);
  }

  /** No decoration's class name is a bright marker. */
  lemma StyleNamesAreNotMarkers(st: Attrs)
    ensures forall i :: 0 <= i < |st.styles| ==> ClassList(st)[i] != BrightFg && ClassList(st)[i] != BrightBg
  {
    ClassListParts(st);
    forall i | 0 <= i < |st.styles| ensures ClassList(st)[i] != BrightFg && ClassList(st)[i] != BrightBg {
      ClassNameShape(st.styles[i]);
    }
  }

  /** The colour part of the class list holds `bright-fg` only after a set foreground, and never `bright-bg`. */
  lemma ColourPartMarkers(st: Attrs)
    requires WellFormed(st)
    ensures var tail := ClassList(st)[|st.styles|..];
      BrightBg !in tail && (BrightFg in tail <==> st.fg.Some? && st.brightFg)
  {
    ClassListParts(st);
    if st.fg.Some? {
      ColorNameShapeOf(st.fg.value, true);
    }
    if st.bg.Some? {
      ColorNameShapeOf(st.bg.value, false);
    }
  }

  /** In a reachable state the class list never holds `bright-bg`, and holds `bright-fg` exactly when a bright foreground is set. */
  lemma BrightMarkers(st: Attrs)
    requires WellFormed(st)
    ensures BrightBg !in ClassList(st)
    ensures BrightFg in ClassList(st) <==> st.fg.Some? && st.brightFg
  {
    var cs := ClassList(st);
    var k := |st.styles|;
    StyleNamesAreNotMarkers(st);
    ColourPartMarkers(st);
    var tail := cs[k..];
    forall j | 0 <= j < |cs| && (cs[j] == BrightFg || cs[j] == BrightBg) ensures cs[j] in tail {
      assert j >= k;
      assert cs[j] == tail[j - k];
    }
    if st.fg.Some? && st.brightFg {
      var j :| 0 <= j < |tail| && tail[j] == BrightFg;
      assert cs[k + j] == BrightFg;
    }
  }

  /**
   * The class attribute of a rendered span splits on spaces back into the
   * class list, in order.
   */
  lemma ClassAttributeRoundTrip(st: Attrs)
    requires WellFormed(st)
    requires ClassList(st) != []
    ensures SplitOn(Join(ClassList(st), " "), ' ') == ClassList(st)
  {
    var cs := ClassList(st);
    ClassListParts(st);
    if st.fg.Some? {
      ColorNameShapeOf(st.fg.value, true);
    }
    if st.bg.Some? {
      ColorNameShapeOf(st.bg.value, false);
    }
    forall c | c in cs ensures ' ' !in c {
      var j :| 0 <= j < |cs| && cs[j] == c;
      if j < |st.styles| {
        ClassNameShape(st.styles[j]);
      } else {
        assert c in cs[|st.styles|..];
      }
    }
    SplitOnJoin(cs, ' ');
  }
}
