/**
 * The two text utilities of the engine: `escape_for_html`, which replaces the
 * five characters HTML treats specially by entities, and `linkify`, which
 * wraps every `http://` or `https://` address in an anchor.
 */
module Html {

  /** The characters `escape_for_html` replaces. */
  predicate IsSpecial(c: char)
  {
    c == '&' || c == '<' || c == '>' || c == '"' || c == '\''
  }

  /** The replacement of one character. */
  function EscapeChar(c: char): (r: string)
    ensures IsSpecial(c) ==> |r| > 1 && r[0] == '&'
    ensures !IsSpecial(c) ==> r == [c]
    ensures forall j :: 0 <= j < |r| ==> !IsMarkup(r[j])
  {
    if c == '&' then "&amp;"
    else if c == '<' then "&lt;"
    else if c == '>' then "&gt;"
    else if c == '"' then "&quot;"
    else if c == '\'' then "&#39;"
    else [c]
  }

  /** `escape_for_html(txt)`: every special character replaced, everything else kept. */
  function EscapeForHtml(s: string): (r: string)
    ensures |r| >= |s|
    decreases |s|
  {
    if s == [] then [] else EscapeChar(s[0]) + EscapeForHtml(s[1..])
  }

  /** The characters that could open or close markup or an attribute value. */
  predicate IsMarkup(c: char)
  {
    c == '<' || c == '>' || c == '"' || c == '\''
  }

  /** The escaped text holds none of `<`, `>`, `"` and `'`. */
  lemma {:induction false} EscapedHasNoMarkup(s: string)
    ensures forall i :: 0 <= i < |EscapeForHtml(s)| ==> !IsMarkup(EscapeForHtml(s)[i])
    decreases |s|
  {
    if s != [] {
      EscapedHasNoMarkup(s[1..]);
      var e, t := EscapeChar(s[0]), EscapeForHtml(s[1..]);
      assert EscapeForHtml(s) == e + t;
      forall i | 0 <= i < |e + t| ensures !IsMarkup((e + t)[i]) {
        if i >= |e| {
          assert (e + t)[i] == t[i - |e|];
        } else {
          assert (e + t)[i] == e[i];
        }
      }
    }
  }

  /** Decoding the five entities back, left to right. */
  function Unescape(s: string): string
    decreases |s|
  {
    if s == [] then []
    else if "&amp;" <= s then "&" + Unescape(s[5..])
    else if "&lt;" <= s then "<" + Unescape(s[4..])
    else if "&gt;" <= s then ">" + Unescape(s[4..])
    else if "&quot;" <= s then "\"" + Unescape(s[6..])
    else if "&#39;" <= s then "'" + Unescape(s[5..])
    else [s[0]] + Unescape(s[1..])
  }

  /** Decoding one replaced character in front of more text. */
  lemma UnescapeChar(c: char, t: string)
    ensures Unescape(EscapeChar(c) + t) == [c] + Unescape(t)
  {
    var s := EscapeChar(c) + t;
    if c == '&' {
      assert s[1] == 'a' && s[5..] == t;
    } else if c == '<' {
      assert s[1] == 'l' && s[4..] == t;
    } else if c == '>' {
      assert s[1] == 'g' && s[4..] == t;
    } else if c == '"' {
      assert s[1] == 'q' && s[6..] == t;
    } else if c == '\'' {
      assert s[1] == '#' && s[5..] == t;
    } else {
      assert s[0] == c && s[1..] == t;
    }
  }

  /** Escaping loses nothing: decoding the entities gives the text back. */
  lemma {:induction false} UnescapeEscape(s: string)
    ensures Unescape(EscapeForHtml(s)) == s
    decreases |s|
  {
    if s != [] {
      UnescapeEscape(s[1..]);
      UnescapeChar(s[0], EscapeForHtml(s[1..]));
      assert [s[0]] + s[1..] == s;
    }
  }

  /** One step of `EscapeForHtml`: the first character's replacement, then the rest. */
  lemma EscapeCons(c: char, t: string)
    ensures EscapeForHtml([c] + t) == EscapeChar(c) + EscapeForHtml(t)
  {
    assert ([c] + t)[0] == c && ([c] + t)[1..] == t;
  }

  /** Escaping works character by character, so it distributes over concatenation. */
  lemma {:induction false} EscapeAppend(a: string, b: string)
    ensures EscapeForHtml(a + b) == EscapeForHtml(a) + EscapeForHtml(b)
    decreases |a|
  {
    if a == [] {
      assert a + b == b;
    } else {
      var c, t := a[0], a[1..];
      assert a == [c] + t;
      assert a + b == [c] + (t + b);
      EscapeAppend(t, b);
      EscapeCons(c, t + b);
      EscapeCons(c, t);
      SeqAssoc(EscapeChar(c), EscapeForHtml(t), EscapeForHtml(b));
    }
  }

  /** Regrouping a concatenation of three strings. */
  lemma SeqAssoc(x: string, y: string, z: string)
    ensures x + (y + z) == (x + y) + z
  {
  }

  /** Equal heads: the sequences are equal exactly when their tails are. */
  lemma ConsInjective(c: char, t: string, u: string)
    ensures [c] + t == [c] + u <==> t == u
  {
    if [c] + t == [c] + u {
      assert t == ([c] + t)[1..];
    }
  }

  /** The text comes back unchanged exactly when it has no special character. */
  lemma {:induction false} EscapeIdentityIff(s: string)
    ensures EscapeForHtml(s) == s <==> forall i :: 0 <= i < |s| ==> !IsSpecial(s[i])
    decreases |s|
  {
    if s != [] {
      EscapeIdentityIff(s[1..]);
      if IsSpecial(s[0]) {
        assert |EscapeForHtml(s)| > |s|;
      } else {
        assert EscapeForHtml(s) == [s[0]] + EscapeForHtml(s[1..]);
        assert (forall i :: 0 <= i < |s| ==> !IsSpecial(s[i]))
          <==> (forall i :: 0 <= i < |s[1..]| ==> !IsSpecial(s[1..][i])) by {
          if forall i :: 0 <= i < |s[1..]| ==> !IsSpecial(s[1..][i]) {
            forall i | 0 <= i < |s| ensures !IsSpecial(s[i]) {
              if i > 0 { assert s[i] == s[1..][i - 1]; }
            }
          }
        }
      }
    }
  }

  /** Escaping twice differs from escaping once: `&` becomes `&amp;amp;`. */
  lemma EscapeNotIdempotent()
    ensures EscapeForHtml("&") == "&amp;"
    ensures EscapeForHtml(EscapeForHtml("&")) == "&amp;amp;"
  {
    assert EscapeForHtml("&") == EscapeChar('&') + EscapeForHtml("");
    EscapeAppend("&", "amp;");
    assert "&amp;" == "&" + "amp;";
    assert EscapeForHtml("amp;") == "amp;" by {
      EscapeIdentityIff("amp;");
    }
  }

  /**
   * JavaScript's `\s`: the ASCII white space characters and the Unicode
   * space separators, line and paragraph separators and the byte order mark.
   */
  predicate IsSpace(c: char)
    ensures c == ' ' || c == '\t' || c == '\n' || c == '\r' ==> IsSpace(c)
    ensures '!' <= c <= '~' ==> !IsSpace(c)
  {
    c == '\t' || c == '\n' || c == '\U{B}' || c == '\U{C}' || c == '\r' || c == ' '
    || c == '\U{A0}' || c == '\U{1680}' || ('\U{2000}' <= c <= '\U{200A}')
    || c == '\U{2028}' || c == '\U{2029}' || c == '\U{202F}' || c == '\U{205F}'
    || c == '\U{3000}' || c == '\U{FEFF}'
  }

  /** No white space in `s`. */
  predicate NoSpace(s: string)
  {
    forall i :: 0 <= i < |s| ==> !IsSpace(s[i])
  }

  /** The length of the run of non-space characters at the start of `s`. */
  function NonSpaceRun(s: string): (n: nat)
    ensures n <= |s|
    decreases |s|
  {
    if s == [] || IsSpace(s[0]) then 0 else 1 + NonSpaceRun(s[1..])
  }

  /** The run holds no white space and stops only at white space or at the end. */
  lemma {:induction false} NonSpaceRunIsMaximal(s: string)
    ensures var n := NonSpaceRun(s); NoSpace(s[..n]) && (n == |s| || IsSpace(s[n]))
    decreases |s|
  {
    if s != [] && !IsSpace(s[0]) {
      NonSpaceRunIsMaximal(s[1..]);
      var n := NonSpaceRun(s);
      assert s[..n] == [s[0]] + s[1..][..n - 1];
      if n < |s| {
        assert s[n] == s[1..][n - 1];
      }
    }
  }

  /** A text without white space is one run. */
  lemma {:induction false} NonSpaceRunAll(s: string)
    requires NoSpace(s)
    ensures NonSpaceRun(s) == |s|
    decreases |s|
  {
    if s != [] {
      assert NoSpace(s[1..]) by {
        forall i | 0 <= i < |s[1..]| ensures !IsSpace(s[1..][i]) {
          assert s[1..][i] == s[i + 1];
        }
      }
      NonSpaceRunAll(s[1..]);
    }
  }

  /** What `https?:\/\/[^\s]+` matches in full: a scheme and at least one non-space character. */
  predicate IsUrl(u: string)
  {
    NoSpace(u) && (("http://" <= u && |u| > 7) || ("https://" <= u && |u| > 8))
  }

  /**
   * The length of the match of `https?:\/\/[^\s]+` at the start of `s`, or
   * 0 when there is none. `https` is tried before `http`, and the run of
   * non-space characters is taken as far as it goes.
   */
  function UrlLength(s: string): (n: nat)
    ensures n <= |s|
  {
    if "https://" <= s && NonSpaceRun(s[8..]) > 0 then 8 + NonSpaceRun(s[8..])
    else if "http://" <= s && NonSpaceRun(s[7..]) > 0 then 7 + NonSpaceRun(s[7..])
    else 0
  }

  /** A match found by `UrlLength` is an address and extends up to white space or the end. */
  lemma UrlLengthMatches(s: string)
    requires UrlLength(s) > 0
    ensures var n := UrlLength(s); IsUrl(s[..n]) && (n == |s| || IsSpace(s[n]))
  {
    var n := UrlLength(s);
    if "https://" <= s && NonSpaceRun(s[8..]) > 0 {
      NonSpaceRunIsMaximal(s[8..]);
      assert s[..n] == s[..8] + s[8..][..n - 8];
      if n < |s| { assert s[n] == s[8..][n - 8]; }
    } else {
      NonSpaceRunIsMaximal(s[7..]);
      assert s[..n] == s[..7] + s[7..][..n - 7];
      if n < |s| { assert s[n] == s[7..][n - 7]; }
    }
  }

  /** When `UrlLength` finds nothing, no prefix of the text is an address. */
  lemma NoUrlPrefix(s: string, k: nat)
    requires UrlLength(s) == 0 && k <= |s|
    ensures !IsUrl(s[..k])
  {
    var u := s[..k];
    if "http://" <= u && |u| > 7 {
      assert s[..7] == u[..7] && s[7] == u[7];
    } else if "https://" <= u && |u| > 8 {
      assert s[..8] == u[..8] && s[8] == u[8];
    }
  }

  /** The anchor `linkify` puts in place of an address. */
  function Anchor(url: string): (r: string)
    ensures |r| == 2 * |url| + 15
  {
    "<a href=\"" + url + "\">" + url + "</a>"
  }

  /** The anchor's layout: the address after `<a href="` and again before `</a>`. */
  lemma AnchorParts(url: string)
    ensures var r := Anchor(url);
      && r[..9] == "<a href=\"" && r[9..9 + |url|] == url && r[9 + |url|..11 + |url|] == "\">"
      && r[|r| - 4 - |url|..|r| - 4] == url && r[|r| - 4..] == "</a>"
  {
  }

  /** `linkify(txt)`: every address, found left to right, replaced by its anchor. */
  function Linkify(s: string): (r: string)
    ensures |r| >= |s|
    decreases |s|
  {
    if s == [] then []
    else
      var n := UrlLength(s);
      if n > 0 then Anchor(s[..n]) + Linkify(s[n..])
      else [s[0]] + Linkify(s[1..])
  }

  /** No address starts anywhere in `s`. */
  ghost predicate UrlFree(s: string)
  {
    forall i :: 0 <= i < |s| ==> UrlLength(s[i..]) == 0
  }

  /** `UrlFree` one character at a time. */
  lemma UrlFreeCons(s: string)
    requires s != []
    ensures UrlFree(s) <==> UrlLength(s) == 0 && UrlFree(s[1..])
  {
    assert s[0..] == s;
    forall i | 0 <= i < |s[1..]| ensures s[1..][i..] == s[i + 1..] { }
    if UrlLength(s) == 0 && UrlFree(s[1..]) {
      forall i | 0 <= i < |s| ensures UrlLength(s[i..]) == 0 {
        if i > 0 { assert s[i..] == s[1..][i - 1..]; }
      }
    }
  }

  /** Where an address starts, `Linkify` makes the text longer. */
  lemma LinkifyGrowsAtUrl(s: string)
    requires UrlLength(s) > 0
    ensures Linkify(s) != s
  {
    var n := UrlLength(s);
    LinkifyUrlStep(s);
    assert |Anchor(s[..n])| > n;
  }

  /** Where no address starts, `Linkify` keeps `s` exactly when it keeps `s[1..]`. */
  lemma LinkifyKeepsHead(s: string)
    requires s != [] && UrlLength(s) == 0
    ensures Linkify(s) == s <==> Linkify(s[1..]) == s[1..]
  {
    LinkifyPlainStep(s);
    ConsInjective(s[0], Linkify(s[1..]), s[1..]);
    assert [s[0]] + s[1..] == s;
  }

  /** The text comes back unchanged exactly when it holds no address. */
  lemma {:induction false} LinkifyIdentityIff(s: string)
    ensures Linkify(s) == s <==> UrlFree(s)
    decreases |s|
  {
    if s != [] {
      UrlFreeCons(s);
      LinkifyIdentityIff(s[1..]);
      if UrlLength(s) > 0 {
        LinkifyGrowsAtUrl(s);
      } else {
        LinkifyKeepsHead(s);
      }
    }
  }

  /** An address ends at white space: appending a space and more text does not change it. */
  lemma NonSpaceRunBeforeSpace(x: string, w: char, b: string)
    requires IsSpace(w)
    ensures NonSpaceRun(x + [w] + b) == NonSpaceRun(x)
    decreases |x|
  {
    if x == [] {
      assert (x + [w] + b)[0] == w;
    } else {
      assert (x + [w] + b)[0] == x[0];
      assert (x + [w] + b)[1..] == x[1..] + [w] + b;
      NonSpaceRunBeforeSpace(x[1..], w, b);
    }
  }

  /** Text after a white space character has no influence on the address at the start. */
  lemma UrlLengthBeforeSpace(x: string, w: char, b: string)
    requires IsSpace(w)
    ensures UrlLength(x + [w] + b) == UrlLength(x)
  {
    var s := x + [w] + b;
    if |x| >= 8 {
      assert s[..8] == x[..8];
      assert s[8..] == x[8..] + [w] + b;
      NonSpaceRunBeforeSpace(x[8..], w, b);
    } else {
      assert s[|x|] == w;
      assert !("https://" <= s);
    }
    if |x| >= 7 {
      assert s[..7] == x[..7];
      assert s[7..] == x[7..] + [w] + b;
      NonSpaceRunBeforeSpace(x[7..], w, b);
    } else {
      assert s[|x|] == w;
      assert !("http://" <= s);
    }
  }

  /** Where the pieces of `a + [w] + b` sit, for a cut `n` inside `a`. */
  lemma CutBeforeSpace(a: string, w: char, b: string, n: nat)
    requires n <= |a|
    ensures (a + [w] + b)[..n] == a[..n]
    ensures (a + [w] + b)[n..] == a[n..] + [w] + b
  {
  }

  /** One step of `Linkify` where no address starts. */
  lemma LinkifyPlainStep(s: string)
    requires s != [] && UrlLength(s) == 0
    ensures Linkify(s) == [s[0]] + Linkify(s[1..])
  {
  }

  /** One step of `Linkify` where an address starts. */
  lemma LinkifyUrlStep(s: string)
    requires UrlLength(s) > 0
    ensures Linkify(s) == Anchor(s[..UrlLength(s)]) + Linkify(s[UrlLength(s)..])
  {
  }

  /** Regrouping a concatenation around one character. */
  lemma ConcatAssoc(x: string, y: string, w: char, z: string)
    ensures x + (y + [w] + z) == (x + y) + [w] + z
  {
  }

  /** `Linkify` around a separator when the text before it starts with an address that stops there. */
  lemma LinkifyAroundSpaceUrl(a: string, w: char, b: string)
    requires UrlLength(a) > 0 && UrlLength(a + [w] + b) == UrlLength(a)
    requires var n := UrlLength(a); Linkify(a[n..] + [w] + b) == Linkify(a[n..]) + [w] + Linkify(b)
    ensures Linkify(a + [w] + b) == Linkify(a) + [w] + Linkify(b)
  {
    var n := UrlLength(a);
    CutBeforeSpace(a, w, b, n);
    LinkifyUrlStep(a + [w] + b);
    LinkifyUrlStep(a);
    ConcatAssoc(Anchor(a[..n]), Linkify(a[n..]), w, Linkify(b));
  }

  /** `Linkify` around a separator when no address starts the text before it. */
  lemma LinkifyAroundSpacePlain(a: string, w: char, b: string)
    requires a != [] && UrlLength(a) == 0 && UrlLength(a + [w] + b) == 0
    requires Linkify(a[1..] + [w] + b) == Linkify(a[1..]) + [w] + Linkify(b)
    ensures Linkify(a + [w] + b) == Linkify(a) + [w] + Linkify(b)
  {
    CutBeforeSpace(a, w, b, 1);
    assert (a + [w] + b)[0] == a[0];
    LinkifyPlainStep(a + [w] + b);
    LinkifyPlainStep(a);
    ConcatAssoc([a[0]], Linkify(a[1..]), w, Linkify(b));
  }

  /** Addresses never span white space: the text on each side of one is linkified on its own. */
  lemma {:induction false} LinkifyAroundSpace(a: string, w: char, b: string)
    requires IsSpace(w)
    ensures Linkify(a + [w] + b) == Linkify(a) + [w] + Linkify(b)
    decreases |a|
  {
    UrlLengthBeforeSpace(a, w, b);
    if a == [] {
      assert a + [w] + b == [w] + b;
      assert ([w] + b)[1..] == b;
    } else if UrlLength(a) > 0 {
      LinkifyAroundSpace(a[UrlLength(a)..], w, b);
      LinkifyAroundSpaceUrl(a, w, b);
    } else {
      LinkifyAroundSpace(a[1..], w, b);
      LinkifyAroundSpacePlain(a, w, b);
    }
  }

  /** A whole text that is one address becomes one anchor around it. */
  lemma LinkifyUrl(u: string)
    requires IsUrl(u)
    ensures Linkify(u) == Anchor(u)
  {
    var k := if "https://" <= u then 8 else 7;
    assert NoSpace(u[k..]) by {
      forall i | 0 <= i < |u[k..]| ensures !IsSpace(u[k..][i]) {
        assert u[k..][i] == u[k + i];
      }
    }
    NonSpaceRunAll(u[k..]);
    assert UrlLength(u) == |u|;
    assert u[..|u|] == u && u[|u|..] == [];
  }
}
